/** Assignments as lines of a text: what decides a match, what writing a value into an
    assignment does to it, and what it does to the lines around it. */
module EnvAssignments {
  import opened Common
  import opened EnvText
  import opened EnvLines
  import opened EnvQuoting

  // ---------------------------------------------------------------------------------------
  // One line
  // ---------------------------------------------------------------------------------------

  ghost predicate SharePrefix(s: string, s': string, p: nat) {
    p <= |s| && p <= |s'| && forall k | 0 <= k < p :: s[k] == s'[k]
  }

  /** Where white space or a word ends before `p`, it ends there in any text that starts alike. */
  lemma {:induction false} SkipSpaceAlike(s: string, s': string, p: nat, i: nat)
    requires SharePrefix(s, s', p) && i <= p && SkipSpace(s, i) <= p
    requires SkipSpace(s, i) == p < |s'| ==> !IsSpace(s'[p])
    ensures SkipSpace(s', i) == SkipSpace(s, i)
    decreases p - i
  {
    if i < p && IsSpace(s[i]) {
      SkipSpaceAlike(s, s', p, i + 1);
    }
  }

  lemma {:induction false} SkipWordCharsAlike(s: string, s': string, p: nat, i: nat)
    requires SharePrefix(s, s', p) && i <= p && SkipWordChars(s, i) < p
    ensures SkipWordChars(s', i) == SkipWordChars(s, i)
    decreases p - i
  {
    if IsWordChar(s[i]) {
      SkipWordCharsAlike(s, s', p, i + 1);
    }
  }

  lemma SkipWordAlike(s: string, s': string, p: nat, i: nat)
    requires SharePrefix(s, s', p) && i < p && SkipWord(s, i) < p
    ensures SkipWord(s', i) == SkipWord(s, i)
  {
    if IsWordStart(s[i]) {
      SkipWordCharsAlike(s, s', p, i + 1);
    }
  }

  lemma KeyKeepsPrefix(s: string, s': string, i: nat)
    requires i <= |s| && KeyAt(s, i).Some?
    requires SharePrefix(s, s', KeyAt(s, i).value.prefix)
    requires KeyAt(s, i).value.prefix < |s'| ==> !IsSpace(s'[KeyAt(s, i).value.prefix])
    ensures KeyAt(s', i) == KeyAt(s, i)
  {
    var p := KeyAt(s, i).value.prefix;
    var j := SkipWord(s, i);
    var e := SkipSpace(s, j);
    SkipWordAlike(s, s', p, i);
    SkipSpaceAlike(s, s', p, j);
    SkipSpaceAlike(s, s', p, e + 1);
    assert s'[i..j] == s[i..j];
  }

  lemma NoKeyAlike(s: string, s': string, p: nat, i: nat)
    requires i <= |s| && SharePrefix(s, s', p)
    requires KeyAt(s, i).None? && SkipSpace(s, SkipWord(s, i)) < p
    ensures KeyAt(s', i).None?
    ensures SkipWord(s', i) == SkipWord(s, i)
    ensures SkipSpace(s', SkipWord(s, i)) == SkipSpace(s, SkipWord(s, i))
  {
    SkipWordAlike(s, s', p, i);
    SkipSpaceAlike(s, s', p, SkipWord(s, i));
  }

  /** What follows the prefix of an assignment does not decide whether or how it matches. */
  lemma MatchKeepsPrefix(s: string, x: string)
    requires Match(s).Some? && (x == "" || !IsSpace(x[0]))
    ensures Match(s[..Match(s).value.prefix] + x) == Match(s)
  {
    var p := Match(s).value.prefix;
    var s' := s[..p] + x;
    var i := SkipSpace(s, 0);
    var j := SkipWord(s, i);
    hide KeyAt, SkipWord, IsSpace;
    SkipSpaceAlike(s, s', p, 0);
    if KeyAt(s, i).Some? {
      KeyKeepsPrefix(s, s', i);
    } else {
      NoKeyAlike(s, s', p, i);
      KeyKeepsPrefix(s, s', SkipSpace(s, j));
      assert s'[i..j] == s[i..j];
    }
  }

  lemma {:induction false} EscapeBreakFree(v: string)
    requires BreakFree(v)
    ensures BreakFree(Escape(v))
  {
    if v != "" {
      EscapeCons(v);
      EscapeBreakFree(v[1..]);
    }
  }

  /** The raw value and the comment of an assignment. */
  function RawOf(body: string): string
    requires Match(body).Some?
  {
    body[Match(body).value.prefix..]
  }

  function PrefixOf(body: string): (p: string)
    requires Match(body).Some?
    ensures p != "" && p <= body
  {
    body[..Match(body).value.prefix]
  }

  /** The body of an assignment after `v` is written into it. */
  function NewBodyOf(body: string, v: string): string
    requires Match(body).Some?
  {
    PrefixOf(body) + (Quote(v) + CommentSuffix(RawOf(body)))
  }

  lemma NewBodyReads(body: string, v: string)
    requires Match(body).Some?
    ensures
      var body' := NewBodyOf(body, v);
      && Match(body') == Match(body)
      && Decode(RawOf(body')) == Success(v)
      && CommentSuffix(RawOf(body')) == CommentSuffix(RawOf(body))
  {
    var suffix := CommentSuffix(RawOf(body));
    MatchKeepsPrefix(body, Quote(v) + suffix);
    assert RawOf(NewBodyOf(body, v)) == Quote(v) + suffix;
    var _ := CommentSuffixIsSuffix(RawOf(body));
    DecodeQuote(v, suffix);
    SuffixOfQuote(v, suffix);
  }

  lemma QuoteBreakFree(v: string)
    requires BreakFree(v)
    ensures BreakFree(Quote(v))
  {
    EscapeBreakFree(v);
    hide Escape;
  }

  lemma RewriteIs(line: string, v: string)
    requires Match(ChompNewline(line)).Some?
    ensures Rewrite(line, Quote(v)) == NewBodyOf(ChompNewline(line), v) + line[|ChompNewline(line)|..]
  {
    hide Match, ChompNewline, Quote, CommentSuffix;
  }

  // ---------------------------------------------------------------------------------------
  // What the parser and the editor take for the body
  // ---------------------------------------------------------------------------------------

  lemma {:induction false} SkipSpaceAtEnd(u: string, c: char, i: nat)
    requires IsSpace(c) && i <= |u|
    ensures SkipSpace(u + [c], i) == if SkipSpace(u, i) < |u| then SkipSpace(u, i) else |u| + 1
    decreases |u| - i
  {
    if i < |u| {
      SkipSpaceAtEnd(u, c, i + 1);
    }
  }

  lemma {:induction false} SkipWordCharsAtEnd(u: string, c: char, i: nat)
    requires IsSpace(c) && i <= |u|
    ensures SkipWordChars(u + [c], i) == SkipWordChars(u, i)
    decreases |u| - i
  {
    if i < |u| {
      SkipWordCharsAtEnd(u, c, i + 1);
    }
  }

  lemma SkipWordAtEnd(u: string, c: char, i: nat)
    requires IsSpace(c) && i <= |u|
    ensures SkipWord(u + [c], i) == SkipWord(u, i)
  {
    if i < |u| {
      SkipWordCharsAtEnd(u, c, i + 1);
    }
  }

  /** The same assignment, its prefix longer by the white space if it is all of the text. */
  function Stretched(a: Option<Assignment>, n: nat): Option<Assignment> {
    if a.Some? && a.value.prefix == n then Some(Assignment(a.value.key, n + 1)) else a
  }

  lemma KeyAtSpace(u: string, c: char, i: nat)
    requires IsSpace(c) && i <= |u|
    ensures KeyAt(u + [c], i) == Stretched(KeyAt(u, i), |u|)
  {
    var j := SkipWord(u, i);
    var e := SkipSpace(u, j);
    SkipWordAtEnd(u, c, i);
    SkipSpaceAtEnd(u, c, j);
    hide SkipWord, IsSpace;
    assert (u + [c])[i..j] == u[i..j];
    if e < |u| {
      SkipSpaceAtEnd(u, c, e + 1);
    }
  }

  /** White space at the end does not decide whether a text is an assignment, nor of what. */
  lemma MatchSpace(u: string, c: char)
    requires IsSpace(c)
    ensures Match(u + [c]) == Stretched(Match(u), |u|)
  {
    var i := SkipSpace(u, 0);
    var j := SkipWord(u, i);
    SkipSpaceAtEnd(u, c, 0);
    SkipWordAtEnd(u, c, i);
    SkipSpaceAtEnd(u, c, j);
    KeyAtSpace(u, c, i);
    assert (u + [c])[i..j] == u[i..j];
    if SkipSpace(u, j) < |u| {
      KeyAtSpace(u, c, SkipSpace(u, j));
    }
  }

  /** The parser and the editor see an assignment of the same key, or none. */
  lemma SameKey(line: string)
    ensures Match(Chomp(line)).Some? <==> Match(ChompNewline(line)).Some?
    ensures Match(Chomp(line)).Some? ==> Match(Chomp(line)).value.key == Match(ChompNewline(line)).value.key
  {
    LineIs(line);
    MissedBreak(line);
    if Chomp(line) != ChompNewline(line) {
      var c := BreakOf(line)[0];
      assert line == Chomp(line) + [c];
      MatchSpace(Chomp(line), c);
    }
  }

  // ---------------------------------------------------------------------------------------
  // Lines whose break survives an edit
  // ---------------------------------------------------------------------------------------

  /** The editor leaves the break of the line where it is: it knows it, or it keeps it as the end
      of a comment. */
  predicate Kept(line: string)
    requires Match(ChompNewline(line)).Some?
  {
    Chomp(line) == ChompNewline(line) || CommentSuffix(RawOf(ChompNewline(line))) != ""
  }

  /** The editor takes the break for white space before a value, and writes the value behind it. */
  predicate Splits(line: string)
    requires Match(ChompNewline(line)).Some?
  {
    !Kept(line) && RawOf(ChompNewline(line)) == ""
  }

  lemma SuffixDropsBreak(suffix: string, c: char)
    requires IsBreak(c) && suffix != "" && suffix[|suffix| - 1] == c && IsSuffix(suffix)
    ensures IsSuffix(suffix[..|suffix| - 1])
  {
    var t := SkipSpace(suffix, 0);
    SkipSpaceStops(suffix, 0);
    SkipSpaceIs(suffix[..|suffix| - 1], 0, t);
  }

  lemma KeptByEnding(line: string, v: string) returns (suffix: string)
    requires Match(ChompNewline(line)).Some? && Chomp(line) == ChompNewline(line) && BreakFree(Chomp(line))
    ensures IsSuffix(suffix) && BreakFree(suffix) && BreakFree(PrefixOf(ChompNewline(line)))
    ensures Rewrite(line, Quote(v)) == (PrefixOf(ChompNewline(line)) + (Quote(v) + suffix)) + BreakOf(line)
  {
    RewriteIs(line, v);
    MissedBreak(line);
    suffix := CommentSuffix(RawOf(ChompNewline(line)));
    var j := CommentSuffixIsSuffix(RawOf(ChompNewline(line)));
    PartsBreakFree(ChompNewline(line), j);
  }

  lemma KeptByComment(line: string, v: string) returns (suffix: string)
    requires Match(ChompNewline(line)).Some? && Chomp(line) != ChompNewline(line) && BreakFree(Chomp(line))
    requires CommentSuffix(RawOf(ChompNewline(line))) != ""
    ensures IsSuffix(suffix) && BreakFree(suffix) && BreakFree(PrefixOf(ChompNewline(line)))
    ensures Rewrite(line, Quote(v)) == (PrefixOf(ChompNewline(line)) + (Quote(v) + suffix)) + BreakOf(line)
  {
    RewriteIs(line, v);
    LineIs(line);
    MissedBreak(line);
    var c, all := BreakOf(line)[0], CommentSuffix(RawOf(line));
    var j := CommentSuffixIsSuffix(RawOf(line));
    ExoticIsBreak(c);
    hide Match, Chomp, ChompNewline, CommentSuffix, Quote, IsSuffix, Rewrite, IsBreak, RawOf, BreakFree, PrefixOf;
    assert BreakOf(line) == [c] && line == Chomp(line) + [c];
    PartsOfRest(line, Chomp(line), c, j);
    suffix := all[..|all| - 1];
    SuffixDropsBreak(all, c);
    Regroup(PrefixOf(line), Quote(v) + suffix, [c]);
    Regroup(Quote(v), suffix, [c]);
    assert NewBodyOf(line, v) + "" == NewBodyOf(line, v) && line[|line|..] == "";
  }

  /** The rewritten form of such a line: prefix, quoted value, a suffix, and the old break. */
  lemma KeptShape(line: string, v: string) returns (suffix: string)
    requires Match(ChompNewline(line)).Some? && Kept(line) && BreakFree(Chomp(line))
    ensures IsSuffix(suffix) && BreakFree(suffix) && BreakFree(PrefixOf(ChompNewline(line)))
    ensures Rewrite(line, Quote(v)) == (PrefixOf(ChompNewline(line)) + (Quote(v) + suffix)) + BreakOf(line)
  {
    if Chomp(line) == ChompNewline(line) {
      suffix := KeptByEnding(line, v);
    } else {
      suffix := KeptByComment(line, v);
    }
  }

  lemma ExoticIsBreak(c: char)
    requires IsExotic(c)
    ensures IsBreak(c) && IsSpace(c)
  {
  }

  lemma PartsBreakFree(body: string, j: nat)
    requires Match(body).Some? && BreakFree(body) && j <= |RawOf(body)|
    ensures BreakFree(PrefixOf(body)) && BreakFree(RawOf(body)[j..])
  {
    hide Match, IsBreak;
  }

  lemma PartsOfRest(body: string, u: string, c: char, j: nat)
    requires Match(body).Some? && body == u + [c] && BreakFree(u) && j < |RawOf(body)|
    ensures BreakFree(PrefixOf(body)) && BreakFree(RawOf(body)[j..][..|RawOf(body)[j..]| - 1])
    ensures RawOf(body)[j..] == RawOf(body)[j..][..|RawOf(body)[j..]| - 1] + [c]
  {
    hide Match, IsBreak;
    var rest := RawOf(body)[j..];
    var k := Match(body).value.prefix + j;
    assert rest == body[k..];
    assert forall i | 0 <= i < |rest| - 1 :: rest[i] == u[k + i];
    assert forall i | 0 <= i < |PrefixOf(body)| :: PrefixOf(body)[i] == u[i];
  }

  // ---------------------------------------------------------------------------------------
  // The line that assigns a key
  // ---------------------------------------------------------------------------------------

  ghost predicate OnlyAt(lines: seq<string>, key: string, p: nat) {
    && p < |lines| && Assigns(lines[p], key)
    && forall i | 0 <= i < |lines| :: Assigns(lines[i], key) ==> i == p
  }

  ghost predicate Nowhere(lines: seq<string>, key: string) {
    forall i | 0 <= i < |lines| :: !Assigns(lines[i], key)
  }

  lemma {:induction false} CountZero(lines: seq<string>, key: string)
    ensures Count(lines, key) == 0 <==> Nowhere(lines, key)
  {
    hide Assigns;
    if lines != [] {
      CountZero(lines[1..], key);
      assert forall i | 1 <= i < |lines| :: lines[i] == lines[1..][i - 1];
      assert forall i | 0 <= i < |lines| - 1 :: lines[1..][i] == lines[i + 1];
    }
  }

  lemma {:induction false} CountOne(lines: seq<string>, key: string) returns (p: nat)
    requires Count(lines, key) == 1
    ensures OnlyAt(lines, key, p)
  {
    hide Assigns;
    if Assigns(lines[0], key) {
      CountZero(lines[1..], key);
      p := 0;
      assert forall i | 1 <= i < |lines| :: lines[i] == lines[1..][i - 1];
    } else {
      var q := CountOne(lines[1..], key);
      p := q + 1;
      assert forall i | 1 <= i < |lines| :: lines[i] == lines[1..][i - 1];
    }
  }

  lemma {:induction false} OnlyAtCount(lines: seq<string>, key: string, p: nat)
    requires OnlyAt(lines, key, p)
    ensures Count(lines, key) == 1
  {
    hide Assigns;
    var tail := lines[1..];
    assert forall i | 0 <= i < |tail| :: tail[i] == lines[i + 1];
    if p == 0 {
      CountZero(tail, key);
    } else {
      OnlyAtCount(tail, key, p - 1);
    }
  }

  lemma EditOne(lines: seq<string>, key: string, encoded: string, p: nat)
    requires OnlyAt(lines, key, p)
    ensures EditAll(lines, key, encoded) == lines[p := Rewrite(lines[p], encoded)]
  {
    hide Match, ChompNewline, Rewrite, EditAll;
    var edited := EditAll(lines, key, encoded);
    forall i | 0 <= i < |lines| && i != p ensures edited[i] == lines[i] {
      assert !Assigns(lines[i], key);
    }
  }
}
