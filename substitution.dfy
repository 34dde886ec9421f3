/** Python's `re.sub(pattern, '>\g<2>', text)` as a scan over the text, for any pattern whose
    matches start with '>' (the character the template puts back). The pattern is given as the
    function that finds its match at the start of a text; the module proves what holds for every
    such pattern, and module HeaderRewriter supplies the one the FlyBase connector uses. */
module Substitution {
  import opened Wrappers

  /** A match at the start of a text: its second group is t[groupStart..groupEnd] and it covers
      t[..end]. */
  datatype Match = Match(groupStart: nat, groupEnd: nat, end: nat)

  /** The patterns substituted here: a match starts with '>', it is not empty, and its group lies
      inside it after the first character. */
  ghost predicate IsMatcher(find: string -> Option<Match>)
  {
    forall t :: find(t).Some? ==>
      t != [] && t[0] == '>' &&
      0 < find(t).value.groupStart <= find(t).value.groupEnd <= find(t).value.end <= |t|
  }

  /** Scanning from the left, each match is replaced by '>' and its group, and the scan goes on
      after the match; a character where no match starts is copied. The result is empty exactly
      when the text is, and it starts with the character the text starts with ('>' where a match
      is there). */
  function Substitute(find: string -> Option<Match>, t: string): (r: string)
    requires IsMatcher(find)
    ensures r == [] <==> t == []
    ensures t != [] ==> r[0] == t[0]
    decreases |t|
  {
    if t == [] then []
    else
      match find(t)
      case Some(m) => ">" + t[m.groupStart..m.groupEnd] + Substitute(find, t[m.end..])
      case None => [t[0]] + Substitute(find, t[1..])
  }

  /** No match starts anywhere in `t`. */
  predicate NoMatch(find: string -> Option<Match>, t: string)
  {
    forall i :: 0 <= i < |t| ==> find(t[i..]).None?
  }

  /** The first index at or after i at which a match starts, if there is one. */
  ghost function NextMatch(find: string -> Option<Match>, t: string, i: nat): (r: Option<nat>)
    requires i <= |t|
    ensures r.Some? ==> i <= r.value < |t| && find(t[r.value..]).Some?
    ensures forall j :: i <= j < (if r.Some? then r.value else |t|) ==> find(t[j..]).None?
    decreases |t| - i
  {
    if i == |t| then None
    else if find(t[i..]).Some? then Some(i)
    else NextMatch(find, t, i + 1)
  }

  /** Regrouping a concatenation, stated once so that the proofs below need not rediscover it
      inside larger sequence terms. */
  lemma AppendAssoc(a: string, b: string, c: string)
    ensures a + (b + c) == (a + b) + c
  {
  }

  /** Where a match starts, its replacement is emitted and the scan resumes after it. */
  lemma SubstituteAtMatch(find: string -> Option<Match>, t: string)
    requires IsMatcher(find)
    requires find(t).Some?
    ensures var m := find(t).value;
      Substitute(find, t) == ">" + t[m.groupStart..m.groupEnd] + Substitute(find, t[m.end..])
  {
  }

  /** Up to the first match, the substitution copies its input. */
  lemma {:induction false} SubstituteUpTo(find: string -> Option<Match>, t: string, j: nat)
    requires IsMatcher(find)
    requires j <= |t|
    requires forall k :: 0 <= k < j ==> find(t[k..]).None?
    ensures Substitute(find, t) == t[..j] + Substitute(find, t[j..])
    decreases j
  {
    if j > 0 {
      var rest := t[1..];
      assert Substitute(find, t) == [t[0]] + Substitute(find, rest) by {
        assert t[0..] == t;
      }
      forall k | 0 <= k < j - 1 ensures find(rest[k..]).None? {
        assert rest[k..] == t[k + 1..];
      }
      SubstituteUpTo(find, rest, j - 1);
      assert rest[j - 1..] == t[j..];
      assert [t[0]] + rest[..j - 1] == t[..j];
      AppendAssoc([t[0]], rest[..j - 1], Substitute(find, t[j..]));
    }
  }

  /** Text in which no match starts is left as it is. */
  lemma NoMatchUnchanged(find: string -> Option<Match>, t: string)
    requires IsMatcher(find)
    requires NoMatch(find, t)
    ensures Substitute(find, t) == t
  {
    SubstituteUpTo(find, t, |t|);
    assert t[..|t|] == t;
  }

  /** The substitution never lengthens a text, and it shortens every text in which a match
      starts: the group it keeps lies strictly inside the match, after the '>'. */
  lemma {:induction false} SubstituteShrinks(find: string -> Option<Match>, t: string)
    requires IsMatcher(find)
    requires forall u :: find(u).Some? ==> find(u).value.groupEnd < find(u).value.end
    ensures |Substitute(find, t)| <= |t|
    ensures !NoMatch(find, t) ==> |Substitute(find, t)| < |t|
    decreases |t|
  {
    if t != [] {
      match find(t)
      case Some(m) =>
        SubstituteShrinks(find, t[m.end..]);
      case None =>
        SubstituteShrinks(find, t[1..]);
        if !NoMatch(find, t) {
          var i :| 0 <= i < |t| && find(t[i..]).Some?;
          assert t[0..] == t;
          assert t[1..][i - 1..] == t[i..];
        }
    }
  }

  /** The substitution leaves a text unchanged exactly when no match starts in it. */
  lemma SubstituteUnchangedIff(find: string -> Option<Match>, t: string)
    requires IsMatcher(find)
    requires forall u :: find(u).Some? ==> find(u).value.groupEnd < find(u).value.end
    ensures Substitute(find, t) == t <==> NoMatch(find, t)
  {
    SubstituteShrinks(find, t);
    if NoMatch(find, t) {
      NoMatchUnchanged(find, t);
    }
  }

  /** The substitution only deletes: every character it emits comes from its input. */
  lemma {:induction false} SubstituteChars(find: string -> Option<Match>, t: string)
    requires IsMatcher(find)
    ensures forall c :: c in Substitute(find, t) ==> c in t
    decreases |t|
  {
    if t != [] {
      match find(t)
      case Some(m) =>
        SubstituteChars(find, t[m.end..]);
        assert forall c :: c in t[m.groupStart..m.groupEnd] ==> c in t;
        assert forall c :: c in t[m.end..] ==> c in t;
      case None =>
        SubstituteChars(find, t[1..]);
        assert forall c :: c in t[1..] ==> c in t;
    }
  }

  /** No match starting in `t` reaches its last character. */
  predicate LastUncovered(find: string -> Option<Match>, t: string)
  {
    forall i :: 0 <= i < |t| && find(t[i..]).Some? ==> find(t[i..]).value.end < |t| - i
  }

  /** A suffix of a text keeps its last character uncovered. */
  lemma LastUncoveredSuffix(find: string -> Option<Match>, t: string, j: nat)
    requires LastUncovered(find, t) && j <= |t|
    ensures LastUncovered(find, t[j..])
  {
    var rest := t[j..];
    forall i | 0 <= i < |rest| && find(rest[i..]).Some?
      ensures find(rest[i..]).value.end < |rest| - i
    {
      assert rest[i..] == t[j + i..];
    }
  }

  /** When no match reaches the last character, the substitution keeps that character last. */
  lemma {:induction false} SubstituteKeepsLast(find: string -> Option<Match>, t: string)
    requires IsMatcher(find)
    requires t != [] && LastUncovered(find, t)
    ensures Substitute(find, t) != []
    ensures Substitute(find, t)[|Substitute(find, t)| - 1] == t[|t| - 1]
    decreases |t|
  {
    assert t[0..] == t;
    match find(t)
    case Some(m) =>
      var rest := t[m.end..];
      LastUncoveredSuffix(find, t, m.end);
      SubstituteKeepsLast(find, rest);
      assert Substitute(find, t) == ">" + t[m.groupStart..m.groupEnd] + Substitute(find, rest);
    case None =>
      var rest := t[1..];
      assert Substitute(find, t) == [t[0]] + Substitute(find, rest);
      if |t| > 1 {
        LastUncoveredSuffix(find, t, 1);
        SubstituteKeepsLast(find, rest);
      }
  }

  /** Emitting a match's replacement keeps the characters before the last within the text
      before its last character, given that the rest of the scan does. */
  lemma InitCharsAfterMatch(t: string, m: Match, rr: string)
    requires t != [] && t[0] == '>' && 0 < m.groupStart <= m.groupEnd <= m.end < |t|
    requires forall k :: 0 <= k < |rr| - 1 ==> rr[k] in t[m.end..][..|t| - m.end - 1]
    ensures var r := ">" + t[m.groupStart..m.groupEnd] + rr;
      forall k :: 0 <= k < |r| - 1 ==> r[k] in t[..|t| - 1]
  {
    var body := t[..|t| - 1];
    var rest := t[m.end..];
    var g := t[m.groupStart..m.groupEnd];
    var r := ">" + g + rr;
    forall k | 0 <= k < |r| - 1 ensures r[k] in body {
      if k == 0 {
        assert body[0] == '>';
      } else if k <= |g| {
        assert r[k] == body[m.groupStart + k - 1];
      } else {
        var k' := k - 1 - |g|;
        assert r[k] == rr[k'];
        assert rr[k'] in rest[..|rest| - 1];
        var i :| 0 <= i < |rest| - 1 && rest[..|rest| - 1][i] == rr[k'];
        assert body[m.end + i] == rest[i];
      }
    }
  }

  /** Copying the first character keeps the characters before the last within the text before
      its last character, given that the rest of the scan does. */
  lemma InitCharsAfterCopy(t: string, rr: string)
    requires |t| > 1
    requires forall k :: 0 <= k < |rr| - 1 ==> rr[k] in t[1..][..|t| - 2]
    ensures var r := [t[0]] + rr;
      forall k :: 0 <= k < |r| - 1 ==> r[k] in t[..|t| - 1]
  {
    var body := t[..|t| - 1];
    var rest := t[1..];
    var r := [t[0]] + rr;
    forall k | 0 <= k < |r| - 1 ensures r[k] in body {
      if k == 0 {
        assert body[0] == t[0];
      } else {
        assert r[k] == rr[k - 1];
        var i :| 0 <= i < |rest| - 1 && rest[..|rest| - 1][i] == rr[k - 1];
        assert body[1 + i] == rest[i];
      }
    }
  }

  /** When no match reaches the last character, everything the substitution emits before its
      last character comes from the text before the last character. */
  lemma {:induction false} SubstituteInitChars(find: string -> Option<Match>, t: string)
    requires IsMatcher(find)
    requires t != [] && LastUncovered(find, t)
    ensures forall k :: 0 <= k < |Substitute(find, t)| - 1 ==> Substitute(find, t)[k] in t[..|t| - 1]
    decreases |t|
  {
    assert t[0..] == t;
    match find(t)
    case Some(m) =>
      LastUncoveredSuffix(find, t, m.end);
      SubstituteInitChars(find, t[m.end..]);
      InitCharsAfterMatch(t, m, Substitute(find, t[m.end..]));
    case None =>
      if |t| > 1 {
        LastUncoveredSuffix(find, t, 1);
        SubstituteInitChars(find, t[1..]);
        InitCharsAfterCopy(t, Substitute(find, t[1..]));
      }
  }
}
