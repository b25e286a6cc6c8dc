/**
 * The string operations the server applies to the child's output and to
 * the text it forwards: `str.rstrip("\n")`, `str.splitlines()`,
 * `str.endswith("\n")` and the substring test `pat in text`.
 */
module Text {

  /** `s.endswith("\n")` */
  predicate EndsWithNewline(s: string) {
    |s| > 0 && s[|s| - 1] == '\n'
  }

  /** `s.rstrip("\n")`: every trailing newline is removed, nothing else. */
  function RStripNewlines(s: string): (r: string)
    ensures !EndsWithNewline(r)
    ensures |r| <= |s| && r == s[..|r|]
    ensures forall i :: |r| <= i < |s| ==> s[i] == '\n'
  {
    if EndsWithNewline(s) then RStripNewlines(s[..|s| - 1]) else s
  }

  /** A line as `readline()` hands it over (with its newline) loses exactly that newline. */
  lemma StripReadLine(line: string)
    requires '\n' !in line
    ensures RStripNewlines(line + "\n") == line
    ensures RStripNewlines(line) == line
  {
  }

  /** The line boundaries `str.splitlines` splits on. */
  predicate IsLineBreak(c: char) {
    c == '\n' || c == '\r' || c == '\U{0B}' || c == '\U{0C}' || c == '\U{1C}' || c == '\U{1D}'
    || c == '\U{1E}' || c == '\U{85}' || c == '\U{2028}' || c == '\U{2029}'
  }

  predicate NoLineBreak(s: string) {
    forall i :: 0 <= i < |s| ==> !IsLineBreak(s[i])
  }

  /** Index of the first line boundary in `s`, or `|s|` when there is none. */
  function LineEnd(s: string): (k: nat)
    ensures k <= |s|
    ensures NoLineBreak(s[..k])
    ensures k < |s| ==> IsLineBreak(s[k])
  {
    if s == [] then 0
    else if IsLineBreak(s[0]) then 0
    else 1 + LineEnd(s[1..])
  }

  /**
   * `s.splitlines()`: the pieces between line boundaries, where "\r\n" counts as
   * one boundary, and a boundary at the very end opens no further (empty) piece.
   */
  function SplitLines(s: string): (r: seq<string>)
    ensures forall i :: 0 <= i < |r| ==> NoLineBreak(r[i])
    ensures s == [] <==> r == []
    decreases |s|
  {
    if s == [] then []
    else
      var k := LineEnd(s);
      if k == |s| then [s]
      else
        var next := if s[k] == '\r' && k + 1 < |s| && s[k + 1] == '\n' then k + 2 else k + 1;
        [s[..k]] + SplitLines(s[next..])
  }

  /** The text a sequence of lines makes when each is written followed by "\n". */
  function JoinLines(ls: seq<string>): string {
    if ls == [] then "" else ls[0] + "\n" + JoinLines(ls[1..])
  }

  /** The strings of `ss`, one after another. */
  function Concat(ss: seq<string>): string {
    if ss == [] then "" else ss[0] + Concat(ss[1..])
  }

  lemma LineEndAfter(l: string, tail: string)
    requires NoLineBreak(l)
    ensures LineEnd(l + "\n" + tail) == |l|
  {
    var s := l + "\n" + tail;
    var k := LineEnd(s);
    assert s[|l|] == '\n';
    assert forall i :: 0 <= i < |l| ==> s[i] == l[i];
  }

  /** Splitting text written line by line gives back exactly those lines, in order. */
  lemma {:induction false} SplitJoin(ls: seq<string>)
    requires forall i :: 0 <= i < |ls| ==> NoLineBreak(ls[i])
    ensures SplitLines(JoinLines(ls)) == ls
  {
    if ls != [] {
      var rest := JoinLines(ls[1..]);
      var s := JoinLines(ls);
      assert s == ls[0] + "\n" + rest;
      LineEndAfter(ls[0], rest);
      assert s[..|ls[0]|] == ls[0];
      assert s[|ls[0]| + 1..] == rest;
      SplitJoin(ls[1..]);
    }
  }

  /** Every line boundary in `s` is a plain "\n". */
  predicate NewlineBreaksOnly(s: string) {
    forall i :: 0 <= i < |s| && IsLineBreak(s[i]) ==> s[i] == '\n'
  }

  /**
   * The converse of SplitJoin for text whose only line boundary is "\n": writing
   * the pieces back line by line restores the text, with a final newline added
   * when the text lacked one.
   */
  lemma {:induction false} JoinSplit(s: string)
    requires NewlineBreaksOnly(s)
    ensures JoinLines(SplitLines(s)) == if s == [] || EndsWithNewline(s) then s else s + "\n"
    decreases |s|
  {
    if s != [] {
      var k := LineEnd(s);
      if k == |s| {
        assert s[..k] == s;
        assert SplitLines(s) == [s];
        JoinCons(s, []);
      } else {
        assert s[k] == '\n';
        var rest := s[k + 1..];
        assert NewlineBreaksOnly(rest) by {
          assert forall i :: 0 <= i < |rest| ==> rest[i] == s[k + 1 + i];
        }
        SplitAtNewline(s, k);
        JoinSplit(rest);
        JoinAfterNewline(s, k, SplitLines(rest));
      }
    }
  }

  lemma JoinAfterNewline(s: string, k: nat, ps: seq<string>)
    requires k < |s| && s[k] == '\n'
    requires var rest := s[k + 1..];
      JoinLines(ps) == if rest == [] || EndsWithNewline(rest) then rest else rest + "\n"
    ensures JoinLines([s[..k]] + ps) == if EndsWithNewline(s) then s else s + "\n"
  {
    var rest := s[k + 1..];
    JoinCons(s[..k], ps);
    assert s == s[..k] + "\n" + rest;
    if rest != [] {
      assert s[|s| - 1] == rest[|rest| - 1];
    }
  }

  lemma SplitAtNewline(s: string, k: nat)
    requires k == LineEnd(s) < |s| && s[k] == '\n'
    ensures SplitLines(s) == [s[..k]] + SplitLines(s[k + 1..])
  {
  }

  lemma JoinCons(l: string, ls: seq<string>)
    ensures JoinLines([l] + ls) == l + "\n" + JoinLines(ls)
  {
    assert ([l] + ls)[1..] == ls;
  }

  /** `s` with every line boundary written as "\n". */
  function MapBreaks(s: string): (r: string)
    ensures |r| == |s|
  {
    seq(|s|, i requires 0 <= i < |s| => if IsLineBreak(s[i]) then '\n' else s[i])
  }

  /**
   * The converse of SplitJoin for every boundary but "\r" (which the text-mode
   * pipe has already turned into "\n"): writing the pieces back line by line
   * gives the text with each boundary written as "\n", and a final newline
   * added when the text did not end in a boundary.
   */
  lemma {:induction false} JoinSplitAll(s: string)
    requires '\r' !in s
    ensures JoinLines(SplitLines(s))
         == if s == [] || IsLineBreak(s[|s| - 1]) then MapBreaks(s) else MapBreaks(s) + "\n"
    decreases |s|
  {
    if s != [] {
      var k := LineEnd(s);
      if k == |s| {
        assert s[..k] == s;
        assert MapBreaks(s) == s;
        assert SplitLines(s) == [s];
        JoinCons(s, []);
      } else {
        var rest := s[k + 1..];
        assert '\r' !in rest by {
          assert forall i :: 0 <= i < |rest| ==> rest[i] == s[k + 1 + i];
        }
        SplitAtBreak(s, k);
        JoinSplitAll(rest);
        JoinAfterBreak(s, k, SplitLines(rest));
      }
    }
  }

  lemma JoinAfterBreak(s: string, k: nat, ps: seq<string>)
    requires k < |s| && IsLineBreak(s[k]) && NoLineBreak(s[..k])
    requires var rest := s[k + 1..];
      JoinLines(ps)
        == if rest == [] || IsLineBreak(rest[|rest| - 1]) then MapBreaks(rest) else MapBreaks(rest) + "\n"
    ensures JoinLines([s[..k]] + ps)
         == if IsLineBreak(s[|s| - 1]) then MapBreaks(s) else MapBreaks(s) + "\n"
  {
    var rest := s[k + 1..];
    JoinCons(s[..k], ps);
    assert MapBreaks(s) == s[..k] + "\n" + MapBreaks(rest) by {
      assert forall i :: 0 <= i < k ==> s[i] == s[..k][i];
      assert forall i :: 0 <= i < |rest| ==> rest[i] == s[k + 1 + i];
    }
    if rest != [] {
      assert s[|s| - 1] == rest[|rest| - 1];
    }
  }

  lemma SplitAtBreak(s: string, k: nat)
    requires k == LineEnd(s) < |s| && s[k] != '\r'
    ensures SplitLines(s) == [s[..k]] + SplitLines(s[k + 1..])
  {
  }

  /** `pat in text` */
  function Contains(text: string, pat: string): (r: bool)
    ensures r ==> |pat| <= |text|
    decreases |text|
  {
    if |text| < |pat| then false
    else text[..|pat|] == pat || Contains(text[1..], pat)
  }

  ghost predicate OccursAt(text: string, pat: string, i: int) {
    0 <= i && i + |pat| <= |text| && text[i..i + |pat|] == pat
  }

  /** The recursive test agrees with "`pat` occurs at some position of `text`". */
  lemma {:induction false} ContainsOccurs(text: string, pat: string)
    ensures Contains(text, pat) <==> exists i :: OccursAt(text, pat, i)
    decreases |text|
  {
    if |text| < |pat| {
    } else if text[..|pat|] == pat {
      assert OccursAt(text, pat, 0);
    } else {
      ContainsOccurs(text[1..], pat);
      if exists i :: OccursAt(text[1..], pat, i) {
        var i :| OccursAt(text[1..], pat, i);
        assert text[1..][i..i + |pat|] == text[i + 1..i + 1 + |pat|];
        assert OccursAt(text, pat, i + 1);
      }
      if exists i :: OccursAt(text, pat, i) {
        var i :| OccursAt(text, pat, i);
        assert i != 0;
        assert text[1..][i - 1..i - 1 + |pat|] == text[i..i + |pat|];
        assert OccursAt(text[1..], pat, i - 1);
      }
    }
  }
}
